/**
 * Values shared by every module of the model: Java's `null`, the exceptions
 * the exercises throw, and a few facts about sequences that several of the
 * containers need.
 */
module Common {

  /** A Java reference that may be `null`. */
  datatype Option<T> = None | Some(value: T) {
    function GetOr(default: T): T {
      if Some? then value else default
    }
  }

  /** The Java exceptions thrown by the modelled code. */
  datatype Error =
    | IndexOutOfBounds     // IndexOutOfBoundsException
    | NoSuchElement        // NoSuchElementException
    | NullPointer          // NullPointerException
    | IllegalState         // IllegalStateException
    | IllegalArgument      // IllegalArgumentException
    | Unsupported          // UnsupportedOperationException
    | Arithmetic           // ArithmeticException (division by zero)

  /** A value-returning call that either returns or throws. */
  datatype Result<T> = Ok(value: T) | Err(error: Error)

  /** A `void` call that either completes or throws. */
  datatype Outcome = Pass | Fail(error: Error)

  /** The first position of `x` in `s`, or -1 (List.indexOf). */
  function IndexOf<T(==)>(s: seq<T>, x: T): (r: int)
    ensures -1 <= r < |s|
    ensures r == -1 <==> x !in s
    ensures 0 <= r ==> s[r] == x && forall k :: 0 <= k < r ==> s[k] != x
  {
    if |s| == 0 then -1
    else if s[0] == x then 0
    else
      var k := IndexOf(s[1..], x);
      if k == -1 then -1 else k + 1
  }

  /** The last position of `x` in `s`, or -1 (List.lastIndexOf). */
  function LastIndexOf<T(==)>(s: seq<T>, x: T): (r: int)
    ensures -1 <= r < |s|
    ensures r == -1 <==> x !in s
    ensures 0 <= r ==> s[r] == x && forall k :: r < k < |s| ==> s[k] != x
  {
    if |s| == 0 then -1
    else if s[|s| - 1] == x then |s| - 1
    else
      assert s == s[..|s| - 1] + [s[|s| - 1]];
      LastIndexOf(s[..|s| - 1], x)
  }

  /** `s` without its element at `i`. */
  function RemoveAt<T>(s: seq<T>, i: nat): (r: seq<T>)
    requires i < |s|
    ensures |r| == |s| - 1
    ensures forall k {:trigger r[k]} :: 0 <= k < i ==> r[k] == s[k]
    ensures forall k :: i <= k < |r| ==> r[k] == s[k + 1]
  {
    s[..i] + s[i + 1..]
  }

  /** `s` with `x` inserted before position `i`. */
  function InsertAt<T>(s: seq<T>, i: nat, x: T): (r: seq<T>)
    requires i <= |s|
    ensures |r| == |s| + 1 && r[i] == x
    ensures forall k {:trigger r[k]} :: 0 <= k < i ==> r[k] == s[k]
    ensures forall k :: i < k < |r| ==> r[k] == s[k - 1]
  {
    s[..i] + [x] + s[i..]
  }

  /** Non-decreasing order of integers. */
  predicate Ascending(s: seq<int>) {
    forall i, j :: 0 <= i < j < |s| ==> s[i] <= s[j]
  }

  function Sum(s: seq<int>): int {
    if |s| == 0 then 0 else s[0] + Sum(s[1..])
  }

  lemma {:induction false} SumAppend(a: seq<int>, b: seq<int>)
    ensures Sum(a + b) == Sum(a) + Sum(b)
  {
    if |a| == 0 {
      assert a + b == b;
    } else {
      assert (a + b)[1..] == a[1..] + b;
      SumAppend(a[1..], b);
    }
  }

  lemma SumRemove(b: seq<int>, k: nat)
    requires k < |b|
    ensures Sum(b) == b[k] + Sum(b[..k] + b[k + 1..])
  {
    assert b == b[..k] + b[k..];
    SumAppend(b[..k], b[k..]);
    assert b[k..][1..] == b[k + 1..];
    SumAppend(b[..k], b[k + 1..]);
  }

  /** Dropping the head of a non-empty sequence takes one copy of it out of the multiset. */
  lemma MultisetTail<T>(a: seq<T>)
    requires |a| > 0
    ensures multiset(a[1..]) == multiset(a) - multiset{a[0]}
  {
    assert a == [a[0]] + a[1..];
  }

  /** Cutting out position k takes one copy of b[k] out of the multiset. */
  lemma MultisetRemove<T>(b: seq<T>, k: nat)
    requires k < |b|
    ensures multiset(b[..k] + b[k + 1..]) == multiset(b) - multiset{b[k]}
  {
    assert b == b[..k] + [b[k]] + b[k + 1..];
  }

  /**
   * For permutations a and b with a non-empty, a position k of b holding
   * a[0] such that a[1..] is a permutation of b without position k.
   */
  lemma MatchIn<T>(a: seq<T>, b: seq<T>) returns (k: nat)
    requires multiset(a) == multiset(b) && |a| > 0
    ensures k < |b| && b[k] == a[0]
    ensures multiset(a[1..]) == multiset(b[..k] + b[k + 1..])
  {
    assert a[0] in multiset(b);
    k :| 0 <= k < |b| && b[k] == a[0];
    MultisetTail(a);
    MultisetRemove(b, k);
  }

  /** Two sequences with the same multiset have the same sum. */
  lemma {:induction false} SumPermutation(a: seq<int>, b: seq<int>)
    requires multiset(a) == multiset(b)
    ensures Sum(a) == Sum(b)
    decreases |a|
  {
    if |a| == 0 {
      assert |b| == |multiset(b)| == 0;
    } else {
      var k := MatchIn(a, b);
      var rest := b[..k] + b[k + 1..];
      SumPermutation(a[1..], rest);
      SumRemove(b, k);
    }
  }

  lemma MulAtLeast(d: int, m: int)
    requires d >= 1 && m >= 0
    ensures d * m >= m
  {
    var k := d - 1;
    assert d * m == k * m + m;
    assert k * m >= 0;
  }

  /** Euclidean division is unique: x == q*m + r with 0 <= r < m fixes q and r. */
  lemma DivModUnique(x: int, q: int, r: int, m: int)
    requires m >= 1 && 0 <= r < m && x == q * m + r
    ensures x % m == r && x / m == q
  {
    var q', r' := x / m, x % m;
    assert x == q' * m + r';
    assert (q - q') * m == r' - r;
    if q > q' {
      MulAtLeast(q - q', m);
    } else if q < q' {
      MulAtLeast(q' - q, m);
    }
  }

  /** Addition commutes with reduction modulo m. */
  lemma ModAdd(a: int, b: int, m: int)
    requires m >= 1
    ensures (a % m + b % m) % m == (a + b) % m
  {
    var s := a % m + b % m;
    var q := a / m + b / m + s / m;
    assert a == (a / m) * m + a % m;
    assert b == (b / m) * m + b % m;
    assert s == (s / m) * m + s % m;
    assert a + b == q * m + s % m;
    DivModUnique(a + b, q, s % m, m);
  }

  /** How many elements of `s` satisfy `p`. */
  function Count<T>(s: seq<T>, p: T -> bool): (r: nat)
    ensures r <= |s|
  {
    if |s| == 0 then 0 else (if p(s[0]) then 1 else 0) + Count(s[1..], p)
  }

  lemma {:induction false} CountAppend<T>(a: seq<T>, b: seq<T>, p: T -> bool)
    ensures Count(a + b, p) == Count(a, p) + Count(b, p)
  {
    if |a| == 0 {
      assert a + b == b;
    } else {
      assert (a + b)[1..] == a[1..] + b;
      CountAppend(a[1..], b, p);
    }
  }

  lemma CountRemove<T>(b: seq<T>, k: nat, p: T -> bool)
    requires k < |b|
    ensures Count(b, p) == (if p(b[k]) then 1 else 0) + Count(b[..k] + b[k + 1..], p)
  {
    assert b == b[..k] + b[k..];
    CountAppend(b[..k], b[k..], p);
    assert b[k..][1..] == b[k + 1..];
    CountAppend(b[..k], b[k + 1..], p);
  }

  /** Counting depends only on the multiset of elements. */
  lemma {:induction false} CountPermutation<T>(a: seq<T>, b: seq<T>, p: T -> bool)
    requires multiset(a) == multiset(b)
    ensures Count(a, p) == Count(b, p)
    decreases |a|
  {
    if |a| == 0 {
      assert |b| == |multiset(b)| == 0;
    } else {
      var k := MatchIn(a, b);
      var rest := b[..k] + b[k + 1..];
      CountPermutation(a[1..], rest, p);
      CountRemove(b, k, p);
    }
  }

  /** If exactly the first `r` elements satisfy `p`, then `r` of them do. */
  lemma {:induction false} CountPrefix<T>(s: seq<T>, p: T -> bool, r: nat)
    requires r <= |s|
    requires forall i :: 0 <= i < r ==> p(s[i])
    requires forall i :: r <= i < |s| ==> !p(s[i])
    ensures Count(s, p) == r
    decreases |s|
  {
    if |s| > 0 {
      CountPrefix(s[1..], p, if r == 0 then 0 else r - 1);
    }
  }

  lemma BoundedByMultiset(t: seq<int>, lo: int)
    requires forall y :: y in multiset(t) ==> lo <= y
    ensures forall i :: 0 <= i < |t| ==> lo <= t[i]
  {
    forall i | 0 <= i < |t|
      ensures lo <= t[i]
    {
      assert t[i] in multiset(t);
    }
  }

  /** Every element of a permutation of s[1..] + [x] is at least s[0]. */
  lemma HeadBelowRest(s: seq<int>, x: int, t: seq<int>)
    requires Ascending(s) && |s| > 0 && s[0] < x
    requires multiset(t) == multiset(s[1..]) + multiset{x}
    ensures forall i :: 0 <= i < |t| ==> s[0] <= t[i]
  {
    forall y | y in multiset(t)
      ensures s[0] <= y
    {
      if y != x {
        assert y in s[1..];
      }
    }
    BoundedByMultiset(t, s[0]);
  }

  lemma ConsAscending(h: int, t: seq<int>)
    requires Ascending(t) && forall i :: 0 <= i < |t| ==> h <= t[i]
    ensures Ascending([h] + t)
  {
  }

  /** `x` placed into an ascending sequence. */
  function Insert(x: int, s: seq<int>): (r: seq<int>)
    requires Ascending(s)
    ensures Ascending(r) && multiset(r) == multiset(s) + multiset{x}
    ensures |r| == |s| + 1
  {
    if |s| == 0 then [x]
    else if x <= s[0] then [x] + s
    else
      var t := Insert(x, s[1..]);
      assert s == [s[0]] + s[1..];
      HeadBelowRest(s, x, t);
      ConsAscending(s[0], t);
      [s[0]] + t
  }

  /**
   * An ascending permutation of `s`. It stands for the library sorts
   * (`Arrays.sort`, `Collections.sort`) that the exercises call.
   */
  function SortInts(s: seq<int>): (r: seq<int>)
    ensures Ascending(r) && multiset(r) == multiset(s) && |r| == |s|
  {
    if |s| == 0 then []
    else
      assert s == [s[0]] + s[1..];
      Insert(s[0], SortInts(s[1..]))
  }
}
