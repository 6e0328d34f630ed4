/**
 * A max-heap on a growable list with sift-up and sift-down, driven by a list
 * of Insert/ExtractMax commands (lesson03/C_HeapMax.java).
 */
module HeapMax {
  import opened Common

  function Parent(k: nat): nat
    requires k > 0
  {
    (k - 1) / 2
  }

  /** Every element is at most its parent. */
  predicate IsHeap(h: seq<int>) {
    forall k :: 0 < k < |h| ==> h[Parent(k)] >= h[k]
  }

  /**
   * The state inside sift-up at position i: the heap order holds except
   * between i and its parent, and i's parent also dominates i's children.
   */
  predicate UpOk(h: seq<int>, i: nat) {
    (forall k :: 0 < k < |h| && k != i ==> h[Parent(k)] >= h[k]) &&
    (i > 0 ==> forall c :: 0 < c < |h| && Parent(c) == i ==> h[Parent(i)] >= h[c])
  }

  /**
   * The state inside sift-down at position i: the heap order holds except
   * between i and its children, and i's parent also dominates i's children.
   */
  predicate DownOk(h: seq<int>, i: nat) {
    (forall k :: 0 < k < |h| && Parent(k) != i ==> h[Parent(k)] >= h[k]) &&
    (i > 0 ==> forall c :: 0 < c < |h| && Parent(c) == i ==> h[Parent(i)] >= h[c])
  }

  function Swap(h: seq<int>, i: nat, j: nat): (r: seq<int>)
    requires i < |h| && j < |h|
    ensures |r| == |h| && multiset(r) == multiset(h)
    ensures r[i] == h[j] && r[j] == h[i] && forall k :: 0 <= k < |h| && k != i && k != j ==> r[k] == h[k]
  {
    h[i := h[j]][j := h[i]]
  }

  /** One swap of sift-up moves the hole one level up. */
  lemma UpStep(h: seq<int>, i: nat)
    requires 0 < i < |h| && UpOk(h, i) && h[i] > h[Parent(i)]
    ensures UpOk(Swap(h, i, Parent(i)), Parent(i))
  {
  }

  /** Sift-up stops at the root or when the parent is not smaller: a heap. */
  lemma UpDone(h: seq<int>, i: nat)
    requires i < |h| && UpOk(h, i) && (i == 0 || h[i] <= h[Parent(i)])
    ensures IsHeap(h)
  {
  }

  /** The children of i are exactly 2i + 1 and 2i + 2. */
  lemma Children(i: nat, c: nat)
    requires c > 0
    ensures Parent(c) == i <==> c == 2 * i + 1 || c == 2 * i + 2
  {
  }

  /** One swap of sift-down with the larger child moves the hole one level down. */
  lemma DownStep(h: seq<int>, i: nat, largest: nat)
    requires (largest == 2 * i + 1 || largest == 2 * i + 2) && largest < |h| && DownOk(h, i)
    requires h[largest] > h[i]
    requires 2 * i + 1 < |h| ==> h[largest] >= h[2 * i + 1]
    requires 2 * i + 2 < |h| ==> h[largest] >= h[2 * i + 2]
    ensures DownOk(Swap(h, i, largest), largest)
  {
    var s := Swap(h, i, largest);
    Children(i, largest);
    forall k | 0 < k < |h| && Parent(k) != largest
      ensures s[Parent(k)] >= s[k]
    {
      DownEdge(h, i, largest, k);
    }
    forall c | 0 < c < |h| && Parent(c) == largest
      ensures s[i] >= s[c]
    {
      Children(i, c);
    }
  }

  /** After the swap, an edge not below the new hole is in order. */
  lemma DownEdge(h: seq<int>, i: nat, largest: nat, k: nat)
    requires (largest == 2 * i + 1 || largest == 2 * i + 2) && largest < |h| && DownOk(h, i)
    requires h[largest] > h[i]
    requires 2 * i + 1 < |h| ==> h[largest] >= h[2 * i + 1]
    requires 2 * i + 2 < |h| ==> h[largest] >= h[2 * i + 2]
    requires 0 < k < |h| && Parent(k) != largest
    ensures Swap(h, i, largest)[Parent(k)] >= Swap(h, i, largest)[k]
  {
    Children(i, k);
    Children(i, largest);
    var s := Swap(h, i, largest);
    if k == i {
      assert s[Parent(k)] == h[Parent(i)];
    } else if Parent(k) == i {
      assert s[Parent(k)] == h[largest];
    } else {
      assert Parent(k) != i && Parent(k) != largest && k != largest;
    }
  }

  /** Sift-down stops when no child is larger: a heap. */
  lemma DownDone(h: seq<int>, i: nat)
    requires i < |h| && DownOk(h, i)
    requires 2 * i + 1 < |h| ==> h[i] >= h[2 * i + 1]
    requires 2 * i + 2 < |h| ==> h[i] >= h[2 * i + 2]
    ensures IsHeap(h)
  {
    forall c | 0 < c < |h|
      ensures Parent(c) == i ==> c == 2 * i + 1 || c == 2 * i + 2
    {
      Children(i, c);
    }
  }

  /** The root of a heap is a maximum. */
  lemma {:induction false} RootIsMax(h: seq<int>, k: nat)
    requires IsHeap(h) && k < |h|
    ensures h[k] <= h[0]
    decreases k
  {
    if k > 0 {
      RootIsMax(h, Parent(k));
    }
  }

  class MaxHeap {
    var heap: seq<int>

    predicate Valid()
      reads this
    {
      IsHeap(heap)
    }

    constructor ()
      ensures Valid() && heap == []
    {
      heap := [];
    }

    method SwapAt(i: nat, j: nat)
      requires i < |heap| && j < |heap|
      modifies this
      ensures heap == Swap(old(heap), i, j)
    {
      var temp := heap[i];
      heap := heap[i := heap[j]];
      heap := heap[j := temp];
    }

    /** siftDown: swap with the larger child until neither child is larger. */
    method SiftDown(i0: nat)
      requires i0 < |heap| && DownOk(heap, i0)
      modifies this
      ensures Valid() && |heap| == old(|heap|) && multiset(heap) == old(multiset(heap))
    {
      var i: nat := i0;
      var size := |heap|;
      while true
        invariant i < size == |heap| && DownOk(heap, i)
        invariant multiset(heap) == old(multiset(heap))
        decreases size - i
      {
        var left, right := 2 * i + 1, 2 * i + 2;
        var largest := i;
        if left < size && heap[left] > heap[largest] {
          largest := left;
        }
        if right < size && heap[right] > heap[largest] {
          largest := right;
        }
        if largest == i {
          DownDone(heap, i);
          break;
        }
        DownStep(heap, i, largest);
        SwapAt(i, largest);
        i := largest;
      }
    }

    /** siftUp: swap with the parent while the parent is smaller. */
    method SiftUp(i0: nat)
      requires i0 < |heap| && UpOk(heap, i0)
      modifies this
      ensures Valid() && |heap| == old(|heap|) && multiset(heap) == old(multiset(heap))
    {
      var i: nat := i0;
      while i > 0
        invariant i < |heap| == old(|heap|) && UpOk(heap, i)
        invariant multiset(heap) == old(multiset(heap))
      {
        var parent := (i - 1) / 2;
        if heap[i] <= heap[parent] {
          break;
        }
        UpStep(heap, i);
        SwapAt(i, parent);
        i := parent;
      }
      UpDone(heap, i);
    }

    /** insert: append, then sift the new element up. */
    method Insert(value: int)
      requires Valid()
      modifies this
      ensures Valid() && multiset(heap) == old(multiset(heap)) + multiset{value}
    {
      heap := heap + [value];
      SiftUp(|heap| - 1);
    }

    /**
     * extractMax: null on an empty heap; otherwise the root, with the last
     * element moved to the root and sifted down.
     */
    method ExtractMax() returns (r: Option<int>)
      requires Valid()
      modifies this
      ensures Valid()
      ensures r.None? <==> old(heap) == []
      ensures r.None? ==> heap == old(heap)
      ensures r.Some? ==> r.value in old(heap) && (forall x :: x in old(heap) ==> x <= r.value)
      ensures r.Some? ==> multiset(heap) == old(multiset(heap)) - multiset{r.value}
    {
      if |heap| == 0 {
        return None;
      }
      forall x | x in heap
        ensures x <= heap[0]
      {
        var k :| 0 <= k < |heap| && heap[k] == x;
        RootIsMax(heap, k);
      }
      var max := heap[0];
      var last := heap[|heap| - 1];
      ghost var before := heap;
      heap := heap[..|heap| - 1];
      assert before == heap + [last];
      if |heap| > 0 {
        ghost var shrunk := heap;
        heap := heap[0 := last];
        assert shrunk == [max] + shrunk[1..] && heap == [last] + shrunk[1..];
        SiftDown(0);
      }
      return Some(max);
    }
  }

  /** A command line, already recognised: extractMax, insert with its argument, or neither. */
  datatype Command = ExtractMax | Insert(arg: Option<int>) | Ignored

  /** The largest element of a non-empty multiset. */
  ghost function Largest(b: multiset<int>): (m: int)
    requires |b| > 0
    ensures m in b && forall x :: x in b ==> x <= m
    decreases |b|
  {
    assert exists y :: y in b by {
      if forall y :: y !in b {
        assert false;
      }
    }
    var x :| x in b;
    var rest := b - multiset{x};
    if |rest| == 0 then
      assert b == multiset{x};
      x
    else
      var m := Largest(rest);
      assert forall y :: y in b ==> y == x || y in rest;
      if x > m then x else m
  }

  /**
   * One command against a multiset of pending values: what it emits, the
   * pending values after it, and whether it counts towards `count`.
   * extractMax emits the largest pending value, or null when nothing is pending.
   */
  ghost function Effect(cmd: Command, bag: multiset<int>): (seq<Option<int>>, multiset<int>, bool) {
    match cmd
      case Ignored => ([], bag, false)
      case Insert(arg) => ([], if arg.Some? then bag + multiset{arg.value} else bag, true)
      case ExtractMax =>
        if |bag| == 0 then ([None], bag, true)
        else ([Some(Largest(bag))], bag - multiset{Largest(bag)}, true)
  }

  /**
   * The values extractMax returns over a command list. The loop stops after
   * `count` recognised commands or at the end of the input.
   */
  ghost function Outputs(cmds: seq<Command>, count: int, bag: multiset<int>): seq<Option<int>>
    decreases |cmds|
  {
    if count <= 0 || |cmds| == 0 then []
    else
      var e := Effect(cmds[0], bag);
      e.0 + Outputs(cmds[1..], if e.2 then count - 1 else count, e.1)
  }

  /** One step of the command loop, in terms of the state before and after it. */
  lemma Advance(rest: seq<Command>, count: int, bag: multiset<int>, outs: seq<Option<int>>,
                whole: seq<Option<int>>, outs': seq<Option<int>>, bag': multiset<int>, count': int)
    requires |rest| > 0 && count > 0 && outs + Outputs(rest, count, bag) == whole
    requires var e := Effect(rest[0], bag);
      outs' == outs + e.0 && bag' == e.1 && count' == if e.2 then count - 1 else count
    ensures outs' + Outputs(rest[1..], count', bag') == whole
  {
  }

  /** The loop ends when `count` commands were recognised or the input runs out. */
  lemma Finished(rest: seq<Command>, count: int, bag: multiset<int>, outs: seq<Option<int>>, whole: seq<Option<int>>)
    requires count <= 0 || |rest| == 0
    requires outs + Outputs(rest, count, bag) == whole
    ensures outs == whole
  {
  }

  /** The answer: the largest non-null value among 0 and the extracted values. */
  predicate MaxOfOutputs(outs: seq<Option<int>>, r: int) {
    r >= 0 && (r == 0 || Some(r) in outs) && forall k :: 0 <= k < |outs| && outs[k].Some? ==> outs[k].value <= r
  }

  /** What one extractMax returns is what the reference semantics emits. */
  lemma ExtractAgrees(before: seq<int>, res: Option<int>)
    requires res.None? <==> before == []
    requires res.Some? ==> res.value in before && forall x :: x in before ==> x <= res.value
    ensures res == if |multiset(before)| == 0 then None else Some(Largest(multiset(before)))
  {
    assert |multiset(before)| == |before|;
    if res.Some? {
      var m := Largest(multiset(before));
      assert m in multiset(before) && res.value in multiset(before);
      assert m in before;
      assert m <= res.value && res.value <= m;
    }
  }

  /**
   * findMaxValue: runs the commands against a MaxHeap and keeps the largest
   * non-null result of extractMax, starting from 0.
   */
  method FindMaxValue(cmds: seq<Command>, count: int) returns (maxValue: int)
    ensures MaxOfOutputs(Outputs(cmds, count, multiset{}), maxValue)
  {
    var heap := new MaxHeap();
    maxValue := Drive(heap, cmds, count);
  }

  /** One recognised command against the heap, and the running maximum. */
  method Step(heap: MaxHeap, cmd: Command, maxValue: int, ghost outs: seq<Option<int>>)
    returns (maxValue': int, ghost outs': seq<Option<int>>, counted: bool)
    requires heap.Valid() && MaxOfOutputs(outs, maxValue)
    modifies heap
    ensures heap.Valid() && MaxOfOutputs(outs', maxValue')
    ensures var e := Effect(cmd, old(multiset(heap.heap)));
      outs' == outs + e.0 && multiset(heap.heap) == e.1 && counted == e.2
  {
    maxValue', outs', counted := maxValue, outs, true;
    match cmd {
      case ExtractMax =>
        ghost var before := heap.heap;
        var res := heap.ExtractMax();
        ExtractAgrees(before, res);
        outs' := outs + [res];
        if res.Some? && res.value > maxValue {
          maxValue' := res.value;
        }
      case Insert(arg) =>
        if arg.Some? {
          heap.Insert(arg.value);
        }
      case Ignored =>
        counted := false;
    }
  }

  /**
   * One pass of the command loop: the next command is run against the heap,
   * and the rest of the commands account for the remaining outputs.
   */
  method Next(heap: MaxHeap, rest: seq<Command>, n: int, maxValue: int,
              ghost outs: seq<Option<int>>, ghost whole: seq<Option<int>>)
    returns (maxValue': int, ghost outs': seq<Option<int>>, counted: bool)
    requires |rest| > 0 && n > 0 && heap.Valid() && MaxOfOutputs(outs, maxValue)
    requires outs + Outputs(rest, n, multiset(heap.heap)) == whole
    modifies heap
    ensures heap.Valid() && MaxOfOutputs(outs', maxValue')
    ensures outs' + Outputs(rest[1..], if counted then n - 1 else n, multiset(heap.heap)) == whole
  {
    ghost var before := heap.heap;
    maxValue', outs', counted := Step(heap, rest[0], maxValue, outs);
    Advance(rest, n, multiset(before), outs, whole, outs', multiset(heap.heap), if counted then n - 1 else n);
  }

  /** The command loop of findMaxValue over a fresh heap. */
  method Drive(heap: MaxHeap, cmds: seq<Command>, count: int) returns (maxValue: int)
    requires heap.Valid() && heap.heap == []
    modifies heap
    ensures MaxOfOutputs(Outputs(cmds, count, multiset{}), maxValue)
  {
    maxValue := 0;
    var i, rest := 0, cmds;
    ghost var outs: seq<Option<int>> := [];
    ghost var whole := Outputs(cmds, count, multiset{});
    while i < count && |rest| > 0
      invariant heap.Valid()
      invariant outs + Outputs(rest, count - i, multiset(heap.heap)) == whole
      invariant MaxOfOutputs(outs, maxValue)
      decreases |rest|
    {
      var counted;
      maxValue, outs, counted := Next(heap, rest, count - i, maxValue, outs, whole);
      if counted {
        i := i + 1;
      }
      rest := rest[1..];
    }
    Finished(rest, count - i, multiset(heap.heap), outs, whole);
  }
}
