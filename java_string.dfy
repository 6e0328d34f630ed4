/**
 * java.lang.String.compareTo and the orders the graph exercises take from it:
 * a TreeSet<String> is held as its strictly ascending list of elements, and
 * Collections.sort on a List<String> yields the non-decreasing permutation.
 */
module JavaString {

  /**
   * String.compareTo: the difference of the first pair of different
   * characters, or of the lengths when one string is a prefix of the other.
   */
  function CompareTo(a: string, b: string): (r: int)
    ensures r == 0 <==> a == b
    decreases |a|
  {
    if |a| == 0 || |b| == 0 then |a| - |b|
    else if a[0] != b[0] then a[0] as int - b[0] as int
    else
      assert a == [a[0]] + a[1..] && b == [b[0]] + b[1..];
      CompareTo(a[1..], b[1..])
  }

  /** a.compareTo(b) < 0 */
  predicate Less(a: string, b: string) {
    CompareTo(a, b) < 0
  }

  /** a.compareTo(b) <= 0 */
  predicate Leq(a: string, b: string) {
    CompareTo(a, b) <= 0
  }

  /** Swapping the operands negates the result. */
  lemma {:induction false} CompareFlip(a: string, b: string)
    ensures CompareTo(b, a) == -CompareTo(a, b)
    decreases |a|
  {
    if |a| > 0 && |b| > 0 && a[0] == b[0] {
      CompareFlip(a[1..], b[1..]);
    }
  }

  /** Two different strings are ordered one way or the other. */
  lemma LessTotal(a: string, b: string)
    requires a != b
    ensures Less(a, b) != Less(b, a)
  {
    CompareFlip(a, b);
  }

  /** Leq is the negation of Less with the operands swapped. */
  lemma LeqNotLess(a: string, b: string)
    ensures Leq(a, b) <==> !Less(b, a)
  {
    CompareFlip(a, b);
  }

  /** The prefix of a string comes first. */
  lemma {:induction false} PrefixLess(a: string, b: string)
    requires |a| < |b| && a == b[..|a|]
    ensures Less(a, b)
    decreases |a|
  {
    if |a| > 0 {
      assert a[0] == b[0];
      assert a[1..] == b[1..][..|a| - 1];
      PrefixLess(a[1..], b[1..]);
    }
  }

  /** Less is transitive. */
  lemma {:induction false} LessTrans(a: string, b: string, c: string)
    requires Less(a, b) && Less(b, c)
    ensures Less(a, c)
    decreases |a|
  {
    if |a| > 0 && |b| > 0 && |c| > 0 && a[0] == b[0] && b[0] == c[0] {
      LessTrans(a[1..], b[1..], c[1..]);
    }
  }

  /** Leq is transitive. */
  lemma LeqTrans(a: string, b: string, c: string)
    requires Leq(a, b) && Leq(b, c)
    ensures Leq(a, c)
  {
    if a != b && b != c {
      LessTrans(a, b, c);
    }
  }

  /** Strictly ascending: the iteration order of a TreeSet<String>. */
  predicate Ascending(s: seq<string>) {
    forall i, j {:trigger Less(s[i], s[j])} :: 0 <= i < j < |s| ==> Less(s[i], s[j])
  }

  /** Non-decreasing: the order Collections.sort leaves a List<String> in. */
  predicate Sorted(s: seq<string>) {
    forall i, j {:trigger Leq(s[i], s[j])} :: 0 <= i < j < |s| ==> Leq(s[i], s[j])
  }

  /** An ascending list holds each element once. */
  lemma AscendingDistinct(s: seq<string>)
    requires Ascending(s)
    ensures forall i, j :: 0 <= i < |s| && 0 <= j < |s| && s[i] == s[j] ==> i == j
  {
    forall i, j | 0 <= i < j < |s|
      ensures s[i] != s[j]
    {
      assert Less(s[i], s[j]);
    }
  }

  /** A TreeSet is determined by its elements: two ascending lists with the same elements are equal. */
  lemma {:induction false} AscendingUnique(a: seq<string>, b: seq<string>)
    requires Ascending(a) && Ascending(b)
    requires forall x :: x in a <==> x in b
    ensures a == b
    decreases |a|
  {
    if |a| > 0 {
      assert a[0] in b;
      assert b[0] in a;
      if a[0] != b[0] {
        var i :| 0 <= i < |b| && b[i] == a[0];
        var j :| 0 <= j < |a| && a[j] == b[0];
        assert Less(b[0], a[0]) && Less(a[0], b[0]);
        LessTotal(a[0], b[0]);
      }
      forall x
        ensures x in a[1..] <==> x in b[1..]
      {
        if x in a[1..] {
          var i :| 1 <= i < |a| && a[i] == x;
          assert x in a;
          var k :| 0 <= k < |b| && b[k] == x;
          assert Less(a[0], a[i]);
          assert k != 0 && b[1..][k - 1] == x;
        }
        if x in b[1..] {
          var i :| 1 <= i < |b| && b[i] == x;
          assert x in b;
          var k :| 0 <= k < |a| && a[k] == x;
          assert Less(b[0], b[i]);
          assert k != 0 && a[1..][k - 1] == x;
        }
      }
      AscendingUnique(a[1..], b[1..]);
    } else if |b| > 0 {
      HeadIn(b);
      assert false;
    }
  }

  lemma HeadIn(s: seq<string>)
    requires |s| > 0
    ensures s[0] in s
  {
  }

  /** TreeSet.add: x is put in its place, or nothing changes when it is already there. */
  function TreeAdd(s: seq<string>, x: string): (r: seq<string>)
    requires Ascending(s)
    ensures Ascending(r)
    ensures forall y :: y in r <==> y in s || y == x
    ensures x in s ==> r == s
  {
    if |s| == 0 then [x]
    else if x == s[0] then s
    else if Less(x, s[0]) then
      assert forall j :: 0 < j < |s| ==> Less(x, s[j]) by {
        forall j | 0 < j < |s| {
          LessTrans(x, s[0], s[j]);
        }
      }
      [x] + s
    else
      LessTotal(x, s[0]);
      var t := TreeAdd(s[1..], x);
      assert forall y :: y in t ==> Less(s[0], y);
      assert x in s ==> x in s[1..];
      [s[0]] + t
  }

  /** x put before the first element it does not follow. */
  function Insert(x: string, s: seq<string>): (r: seq<string>)
    requires Sorted(s)
    ensures Sorted(r)
    ensures multiset(r) == multiset(s) + multiset{x}
  {
    if |s| == 0 then [x]
    else if Leq(x, s[0]) then
      assert forall j :: 0 < j < |s| ==> Leq(x, s[j]) by {
        forall j | 0 < j < |s| {
          LeqTrans(x, s[0], s[j]);
        }
      }
      [x] + s
    else
      LeqNotLess(s[0], x);
      var t := Insert(x, s[1..]);
      assert forall j :: 0 <= j < |t| ==> Leq(s[0], t[j]) by {
        forall j | 0 <= j < |t|
          ensures Leq(s[0], t[j])
        {
          assert t[j] in multiset(t);
          if t[j] != x {
            assert t[j] in multiset(s[1..]);
            var k :| 0 <= k < |s[1..]| && s[1..][k] == t[j];
            assert s[k + 1] == t[j];
          }
        }
      }
      assert s == [s[0]] + s[1..];
      [s[0]] + t
  }

  /** Collections.sort on a List<String>: the non-decreasing permutation. */
  function SortList(s: seq<string>): (r: seq<string>)
    ensures Sorted(r)
    ensures multiset(r) == multiset(s)
  {
    if |s| == 0 then []
    else
      assert s == [s[0]] + s[1..];
      Insert(s[0], SortList(s[1..]))
  }

  /** The head of a sorted list comes before or equals every element. */
  lemma SortedHead(a: seq<string>, x: string)
    requires Sorted(a) && |a| > 0 && x in a
    ensures Leq(a[0], x)
  {
    var k :| 0 <= k < |a| && a[k] == x;
    if k > 0 {
      assert Leq(a[0], a[k]);
    }
  }

  /** The tail of a sorted list is sorted and holds the rest of its multiset. */
  lemma SortedTail(a: seq<string>)
    requires Sorted(a) && |a| > 0
    ensures Sorted(a[1..])
    ensures multiset(a[1..]) == multiset(a) - multiset{a[0]}
  {
    assert a == [a[0]] + a[1..];
    forall i, j | 0 <= i < j < |a| - 1
      ensures Leq(a[1..][i], a[1..][j])
    {
      assert Leq(a[i + 1], a[j + 1]);
    }
  }

  /**
   * A sorted list is determined by its multiset: Collections.sort of two
   * lists holding the same elements equally often gives the same list.
   */
  lemma {:induction false} SortedUnique(a: seq<string>, b: seq<string>)
    requires Sorted(a) && Sorted(b) && multiset(a) == multiset(b)
    ensures a == b
    decreases |a|
  {
    if |a| > 0 {
      assert |b| == |multiset(b)| == |multiset(a)| == |a|;
      assert a[0] in multiset(b) && b[0] in multiset(a);
      SortedHead(a, b[0]);
      SortedHead(b, a[0]);
      CompareFlip(a[0], b[0]);
      SortedTail(a);
      SortedTail(b);
      SortedUnique(a[1..], b[1..]);
      assert a == [a[0]] + a[1..] && b == [b[0]] + b[1..];
    }
  }

  /** Sorting lists with the same multiset gives the same list. */
  lemma SortListSame(s: seq<string>, t: seq<string>)
    requires multiset(s) == multiset(t)
    ensures SortList(s) == SortList(t)
  {
    SortedUnique(SortList(s), SortList(t));
  }

  /** Sorting keeps exactly the elements. */
  lemma SortListElems(s: seq<string>)
    ensures forall x :: x in SortList(s) <==> x in s
  {
    var r := SortList(s);
    forall x
      ensures x in r <==> x in s
    {
      assert x in r <==> x in multiset(r);
      assert x in s <==> x in multiset(s);
    }
  }
}
