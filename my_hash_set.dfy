// MyHashSet: a set over separate chaining in a power-of-two bucket table that doubles
// once the element count reaches three quarters of the capacity.

module MyHashSet {
  import opened Common
  import opened HashTable

  class MyHashSet<E(==)> {
    var table: array<seq<Node<E>>>
    var size: nat
    var threshold: nat
    /** The table's capacity is 2^capacityLog. */
    ghost var capacityLog: nat
    /** The elements' hashCode. */
    const hashCode: E -> int

    /** Everything but the load bound, which add breaks for an instant before resize. */
    ghost predicate Inv()
      reads this, table
    {
      table.Length == Pow2(capacityLog) && 4 <= capacityLog <= 30 &&
      threshold == Threshold(table.Length) &&
      Placed(table[..], hashCode) && Distinct(table[..]) && size == |Elements(table[..])|
    }

    ghost predicate Valid()
      reads this, table
    {
      Inv() && size < threshold
    }

    ghost function Contents(): set<E>
      reads this, table
    {
      Elements(table[..])
    }

    constructor (hashCode: E -> int)
      ensures Valid() && Contents() == {} && table.Length == DefaultCapacity
    {
      table := new seq<Node<E>>[DefaultCapacity](_ => []);
      size := 0;
      threshold := Threshold(DefaultCapacity);
      capacityLog := 4;
      this.hashCode := hashCode;
      new;
      EmptyTable(table[..], hashCode);
    }

    /** resize: double the table and re-bucket every node by its stored hash. */
    method Resize()
      requires Inv() && capacityLog < 30
      modifies this
      ensures Inv() && fresh(table) && table.Length == 2 * old(table.Length)
      ensures capacityLog == old(capacityLog) + 1 && threshold == Threshold(table.Length)
      ensures Contents() == old(Contents()) && size == old(size)
    {
      var newCapacity := 2 * table.Length;
      var newTable := Rehash(table, newCapacity, hashCode);
      table := newTable;
      threshold := Threshold(newCapacity);
      capacityLog := capacityLog + 1;
    }

    function Size(): (r: nat)
      reads this, table
      requires Valid()
      ensures r == |Contents()|
    {
      size
    }

    function IsEmpty(): (r: bool)
      reads this, table
      requires Valid()
      ensures r <==> Contents() == {}
    {
      size == 0
    }

    method Clear()
      requires Valid()
      modifies this, table
      ensures Valid() && Contents() == {} && table == old(table)
    {
      if size > 0 {
        forall i | 0 <= i < table.Length {
          table[i] := [];
        }
        size := 0;
        EmptyTable(table[..], hashCode);
      }
    }

    /**
     * add: null is refused; an element already present leaves the set unchanged; a new one
     * is linked at the head of its bucket, and the table doubles once size reaches the
     * threshold.
     */
    method Add(o: Option<E>) returns (r: Result<bool>)
      requires Valid() && size + 1 < Threshold(MaxCapacity)
      modifies this, table
      ensures Valid()
      ensures o.None? ==> r == Err(NullPointer) && Contents() == old(Contents())
      ensures o.Some? ==> r == Ok(o.value !in old(Contents()))
      ensures o.Some? ==> Contents() == old(Contents()) + {o.value}
    {
      if o.None? {
        return Err(NullPointer);
      }
      var x := o.value;
      var hash, index, j := Locate(x);
      if j < |table[index]| {
        return Ok(false);
      }
      Link(x, hash, index);
      if size >= threshold {
        CanGrow();
        Resize();
      }
      r := Ok(true);
    }

    /**
     * The walk of x's bucket: its hash, the bucket's index and the position of x's node in
     * that chain, which is the chain's length when x is absent.
     */
    method Locate(x: E) returns (hash: nat, index: nat, j: nat)
      requires Valid()
      ensures hash == Hash(hashCode, x) && index == Slot(hashCode, x, table.Length)
      ensures j <= |table[index]| && (j < |table[index]| <==> x in Contents())
      ensures j < |table[index]| ==> table[index][j].item == x
    {
      hash := Hash(hashCode, x);
      index := IndexFor(hash, table.Length);
      var chain := table[index];
      j := Scan(chain, hash, x);
      PlacedChain(table[..], hashCode, index);
      ScanFinds(chain, hashCode, x, j);
      Lookup(table[..], hashCode, x);
    }

    /** Below the add bound, a full table is always smaller than the largest capacity. */
    lemma CanGrow()
      requires Inv() && threshold <= size < Threshold(MaxCapacity)
      ensures capacityLog < 30 && threshold < Threshold(2 * table.Length)
    {
      MaxCapacityIsPow2();
      ThresholdGrows(table.Length);
    }

    /** The new node goes to the head of bucket index. */
    method Link(x: E, hash: nat, index: nat)
      requires Valid() && x !in Contents()
      requires hash == Hash(hashCode, x) && index == Slot(hashCode, x, table.Length)
      modifies this, table
      ensures Inv() && size == old(size) + 1 <= threshold && table == old(table)
      ensures unchanged(`capacityLog) && Contents() == old(Contents()) + {x}
    {
      Prepend(table[..], hashCode, x);
      table[index] := [Node(hash, x)] + table[index];
      size := size + 1;
    }

    /** remove: null is refused; otherwise the matching node, if any, is spliced out. */
    method Remove(o: Option<E>) returns (r: Result<bool>)
      requires Valid()
      modifies this, table
      ensures Valid() && table == old(table)
      ensures o.None? ==> r == Err(NullPointer) && Contents() == old(Contents())
      ensures o.Some? ==> r == Ok(o.value in old(Contents()))
      ensures o.Some? ==> Contents() == old(Contents()) - {o.value}
    {
      if o.None? {
        return Err(NullPointer);
      }
      var x := o.value;
      var hash, index, j := Locate(x);
      if j == |table[index]| {
        return Ok(false);
      }
      Unlink(table[..], hashCode, index, j);
      table[index] := table[index][..j] + table[index][j + 1..];
      size := size - 1;
      r := Ok(true);
    }

    /** contains: null is refused; otherwise a walk of the element's own bucket. */
    method Contains(o: Option<E>) returns (r: Result<bool>)
      requires Valid()
      ensures o.None? ==> r == Err(NullPointer)
      ensures o.Some? ==> r == Ok(o.value in Contents())
    {
      if o.None? {
        return Err(NullPointer);
      }
      var x := o.value;
      var hash, index, j := Locate(x);
      r := Ok(j < |table[index]|);
    }
  }
}
