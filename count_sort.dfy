/**
 * Counting sort of small naturals, in place (lesson05/B_CountSort.java).
 * The counts cover the indices 0..10, but the output loop only emits the
 * values 1..10: the documented input has natural numbers not above 10, and a
 * 0 in the input would be counted and never written back.
 */
module CountSort {
  import opened Common

  const MaxValue := 10

  function Is(v: int): int -> bool {
    x => x == v
  }

  function InRange(lo: int, hi: int): int -> bool {
    x => lo <= x < hi
  }

  /** The number of occurrences of `v` in `s`. */
  function Occ(s: seq<int>, v: int): nat {
    Count(s, Is(v))
  }

  function Block(v: int, k: nat): (r: seq<int>)
    ensures |r| == k && forall i :: 0 <= i < k ==> r[i] == v
  {
    seq(k, _ => v)
  }

  /**
   * What the output loop has written once it has finished every value below
   * `v`: Occ(s, 1) ones, then Occ(s, 2) twos, and so on.
   */
  function Upto(s: seq<int>, v: int): seq<int>
    requires 1 <= v <= MaxValue + 1
    decreases v
  {
    if v == 1 then [] else Upto(s, v - 1) + Block(v - 1, Occ(s, v - 1))
  }

  /** The sorted output of countSort on `s`. */
  function Sorted(s: seq<int>): seq<int> {
    Upto(s, MaxValue + 1)
  }

  lemma OccSnoc(s: seq<int>, x: int, v: int)
    ensures Occ(s + [x], v) == Occ(s, v) + (if x == v then 1 else 0)
  {
    CountAppend(s, [x], Is(v));
  }

  lemma {:induction false} CountDisjointUnion(s: seq<int>, p: int -> bool, q: int -> bool, r: int -> bool)
    requires forall x :: r(x) == (p(x) || q(x))
    requires forall x :: !(p(x) && q(x))
    ensures Count(s, r) == Count(s, p) + Count(s, q)
    decreases |s|
  {
    if |s| > 0 {
      CountDisjointUnion(s[1..], p, q, r);
    }
  }

  /** The emitted prefix has one slot per input value in [1, v). */
  lemma {:induction false} UptoLength(s: seq<int>, v: int)
    requires 1 <= v <= MaxValue + 1
    ensures |Upto(s, v)| == Count(s, InRange(1, v))
    decreases v
  {
    if v == 1 {
      CountPrefix(s, InRange(1, 1), 0);
    } else {
      UptoLength(s, v - 1);
      CountDisjointUnion(s, InRange(1, v - 1), Is(v - 1), InRange(1, v));
    }
  }

  /** The emitted prefix is non-decreasing and holds only values in [1, v). */
  lemma {:induction false} UptoAscending(s: seq<int>, v: int)
    requires 1 <= v <= MaxValue + 1
    ensures Ascending(Upto(s, v))
    ensures forall i :: 0 <= i < |Upto(s, v)| ==> 1 <= Upto(s, v)[i] < v
    decreases v
  {
    if v > 1 {
      UptoAscending(s, v - 1);
    }
  }

  lemma {:induction false} OccIsMultiplicity(s: seq<int>, v: int)
    ensures multiset(s)[v] == Occ(s, v)
    decreases |s|
  {
    if |s| > 0 {
      OccIsMultiplicity(s[1..], v);
      assert s == [s[0]] + s[1..];
    }
  }

  lemma {:induction false} BlockMultiset(v: int, k: nat)
    ensures forall w :: multiset(Block(v, k))[w] == if w == v then k else 0
    decreases k
  {
    if k > 0 {
      BlockMultiset(v, k - 1);
      assert Block(v, k) == Block(v, k - 1) + [v];
    }
  }

  /** Each value in [1, v) occurs in the emitted prefix as often as in the input. */
  lemma {:induction false} UptoMultiset(s: seq<int>, v: int)
    requires 1 <= v <= MaxValue + 1
    ensures forall w :: multiset(Upto(s, v))[w] == if 1 <= w < v then Occ(s, w) else 0
    decreases v
  {
    if v > 1 {
      UptoMultiset(s, v - 1);
      var b := Block(v - 1, Occ(s, v - 1));
      assert multiset(Upto(s, v)) == multiset(Upto(s, v - 1)) + multiset(b);
      BlockMultiset(v - 1, Occ(s, v - 1));
    }
  }

  /**
   * On the documented input (every value in 1..10) the output is an
   * ascending permutation of the input.
   */
  lemma SortedIsAscendingPermutation(s: seq<int>)
    requires forall i :: 0 <= i < |s| ==> 1 <= s[i] <= MaxValue
    ensures Ascending(Sorted(s))
    ensures multiset(Sorted(s)) == multiset(s)
    ensures |Sorted(s)| == |s|
  {
    UptoAscending(s, MaxValue + 1);
    UptoMultiset(s, MaxValue + 1);
    forall w
      ensures multiset(Sorted(s))[w] == multiset(s)[w]
    {
      OccIsMultiplicity(s, w);
      if !(1 <= w <= MaxValue) {
        assert w !in s;
      }
    }
    assert multiset(Sorted(s)) == multiset(s);
    assert |Sorted(s)| == |multiset(Sorted(s))| == |multiset(s)| == |s|;
  }

  /** With zeros in the input, the output is the input without its zeros, sorted. */
  lemma SortedDropsZeros(s: seq<int>)
    requires forall i :: 0 <= i < |s| ==> 0 <= s[i] <= MaxValue
    ensures Ascending(Sorted(s))
    ensures multiset(Sorted(s)) == multiset(s)[0 := 0]
  {
    UptoAscending(s, MaxValue + 1);
    UptoMultiset(s, MaxValue + 1);
    forall w
      ensures multiset(Sorted(s))[w] == multiset(s)[0 := 0][w]
    {
      OccIsMultiplicity(s, w);
      if !(0 <= w <= MaxValue) {
        assert w !in s;
      }
    }
    assert multiset(Sorted(s)) == multiset(s)[0 := 0];
  }

  /**
   * countSort: count[v] is tallied for every input value, then the values
   * 1..10 are written back from index 0 as often as they were counted. The
   * slots after the written prefix keep their old contents.
   */
  method CountSortInPlace(points: array<int>)
    requires forall i :: 0 <= i < points.Length ==> 0 <= points[i] <= MaxValue
    modifies points
    ensures |Sorted(old(points[..]))| <= points.Length
    ensures points[..|Sorted(old(points[..]))|] == Sorted(old(points[..]))
    ensures points[|Sorted(old(points[..]))|..] == old(points[..])[|Sorted(old(points[..]))|..]
  {
    var count := Tally(points);
    WriteBack(points, count);
  }

  /** The counting loop: count[v] becomes the number of occurrences of v. */
  method Tally(points: array<int>) returns (count: array<int>)
    requires forall i :: 0 <= i < points.Length ==> 0 <= points[i] <= MaxValue
    ensures fresh(count) && count.Length == MaxValue + 1
    ensures forall v :: 0 <= v <= MaxValue ==> count[v] == Occ(points[..], v)
  {
    count := new int[MaxValue + 1](_ => 0);
    var i := 0;
    assert points[..0] == [];
    while i < points.Length
      invariant 0 <= i <= points.Length
      invariant forall v :: 0 <= v <= MaxValue ==> count[v] == Occ(points[..i], v)
    {
      assert points[..i + 1] == points[..i] + [points[i]];
      forall v | 0 <= v <= MaxValue {
        OccSnoc(points[..i], points[i], v);
      }
      count[points[i]] := count[points[i]] + 1;
      i := i + 1;
    }
    assert points[..points.Length] == points[..];
  }

  /** The output loops: every count is drained into consecutive slots. */
  method WriteBack(points: array<int>, count: array<int>)
    requires count.Length == MaxValue + 1 && count != points
    requires forall v :: 0 <= v <= MaxValue ==> count[v] == Occ(points[..], v)
    modifies points, count
    ensures |Sorted(old(points[..]))| <= points.Length
    ensures points[..|Sorted(old(points[..]))|] == Sorted(old(points[..]))
    ensures points[|Sorted(old(points[..]))|..] == old(points[..])[|Sorted(old(points[..]))|..]
    ensures forall v :: 1 <= v <= MaxValue ==> count[v] == 0
  {
    ghost var s := points[..];
    var index := 0;
    var num := 1;
    while num <= MaxValue
      invariant 1 <= num <= MaxValue + 1
      invariant index == |Upto(s, num)| <= points.Length
      invariant points[..index] == Upto(s, num)
      invariant points[index..] == s[index..]
      invariant forall v :: num <= v <= MaxValue ==> count[v] == Occ(s, v)
      invariant forall v :: 1 <= v < num ==> count[v] == 0
    {
      UptoLength(s, num + 1);
      index := Drain(points, count, num, index);
      assert Upto(s, num + 1) == Upto(s, num) + Block(num, Occ(s, num));
      num := num + 1;
    }
  }

  /** The inner output loop: count[num] copies of num from `index` on, draining count[num]. */
  method Drain(points: array<int>, count: array<int>, num: int, index: nat) returns (next: nat)
    requires count.Length == MaxValue + 1 && count != points && 1 <= num <= MaxValue
    requires 0 <= count[num] && index + count[num] <= points.Length
    modifies points, count
    ensures next == index + old(count[num])
    ensures points[..next] == old(points[..index]) + Block(num, old(count[num]))
    ensures points[next..] == old(points[next..])
    ensures count[num] == 0
    ensures forall v :: 0 <= v <= MaxValue && v != num ==> count[v] == old(count[v])
  {
    next := index;
    while count[num] > 0
      invariant index <= next && next + count[num] == index + old(count[num])
      invariant 0 <= count[num]
      invariant points[..next] == old(points[..index]) + Block(num, next - index)
      invariant points[next..] == old(points[next..])
      invariant forall v :: 0 <= v <= MaxValue && v != num ==> count[v] == old(count[v])
    {
      points[next] := num;
      next := next + 1;
      count[num] := count[num] - 1;
    }
  }
}
