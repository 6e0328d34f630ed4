/**
 * Counting the segments that cover each point with two sorted endpoint
 * arrays and two binary searches (lesson05/A_QSort.java).
 */
module QSort {
  import opened Common

  datatype Segment = Segment(start: int, stop: int)

  /** The segment read as (a, b), with its ends swapped when a > b. */
  function Normalize(a: int, b: int): (s: Segment)
    ensures s.start <= s.stop
    ensures (s.start, s.stop) == (a, b) || (s.start, s.stop) == (b, a)
  {
    if a > b then Segment(b, a) else Segment(a, b)
  }

  predicate Covers(s: Segment, p: int) {
    s.start <= p <= s.stop
  }

  function CoversPoint(p: int): Segment -> bool {
    s => Covers(s, p)
  }

  /** How many segments cover `p`: the answer each point expects. */
  function Covering(segs: seq<Segment>, p: int): nat {
    Count(segs, CoversPoint(p))
  }

  function Starts(segs: seq<Segment>): (r: seq<int>)
    ensures |r| == |segs| && forall i :: 0 <= i < |segs| ==> r[i] == segs[i].start
  {
    if |segs| == 0 then [] else [segs[0].start] + Starts(segs[1..])
  }

  function Stops(segs: seq<Segment>): (r: seq<int>)
    ensures |r| == |segs| && forall i :: 0 <= i < |segs| ==> r[i] == segs[i].stop
  {
    if |segs| == 0 then [] else [segs[0].stop] + Stops(segs[1..])
  }

  function AtMost(key: int): int -> bool {
    x => x <= key
  }

  function Below(key: int): int -> bool {
    x => x < key
  }

  /** upperBound: on an ascending array, the number of elements <= key. */
  method UpperBound(arr: array<int>, key: int) returns (r: int)
    requires Ascending(arr[..])
    ensures 0 <= r <= arr.Length
    ensures forall i :: 0 <= i < r ==> arr[i] <= key
    ensures forall i :: r <= i < arr.Length ==> arr[i] > key
    ensures r == Count(arr[..], AtMost(key))
  {
    var left, right := 0, arr.Length;
    while left < right
      invariant 0 <= left <= right <= arr.Length
      invariant forall i :: 0 <= i < left ==> arr[i] <= key
      invariant forall i :: right <= i < arr.Length ==> arr[i] > key
    {
      var mid := (left + right) / 2;
      if arr[mid] <= key {
        left := mid + 1;
      } else {
        right := mid;
      }
    }
    CountPrefix(arr[..], AtMost(key), left);
    return left;
  }

  /** lowerBound: on an ascending array, the number of elements < key. */
  method LowerBound(arr: array<int>, key: int) returns (r: int)
    requires Ascending(arr[..])
    ensures 0 <= r <= arr.Length
    ensures forall i :: 0 <= i < r ==> arr[i] < key
    ensures forall i :: r <= i < arr.Length ==> arr[i] >= key
    ensures r == Count(arr[..], Below(key))
  {
    var left, right := 0, arr.Length;
    while left < right
      invariant 0 <= left <= right <= arr.Length
      invariant forall i :: 0 <= i < left ==> arr[i] < key
      invariant forall i :: right <= i < arr.Length ==> arr[i] >= key
    {
      var mid := (left + right) / 2;
      if arr[mid] < key {
        left := mid + 1;
      } else {
        right := mid;
      }
    }
    CountPrefix(arr[..], Below(key), left);
    return left;
  }

  /**
   * The counting identity behind the formula: a normalised segment ends
   * before p only if it also starts at or before p, so the covering count is
   * (#starts <= p) - (#stops < p).
   */
  lemma {:induction false} CoveringByEndpoints(segs: seq<Segment>, p: int)
    requires forall i :: 0 <= i < |segs| ==> segs[i].start <= segs[i].stop
    ensures Covering(segs, p) == Count(Starts(segs), AtMost(p)) - Count(Stops(segs), Below(p))
  {
    if |segs| > 0 {
      CoveringByEndpoints(segs[1..], p);
      assert Starts(segs)[1..] == Starts(segs[1..]);
      assert Stops(segs)[1..] == Stops(segs[1..]);
    }
  }

  /** Sorting the endpoint lists does not change either count. */
  lemma CoveringFromSorted(segs: seq<Segment>, starts: seq<int>, stops: seq<int>, p: int)
    requires forall i :: 0 <= i < |segs| ==> segs[i].start <= segs[i].stop
    requires multiset(starts) == multiset(Starts(segs))
    requires multiset(stops) == multiset(Stops(segs))
    ensures Covering(segs, p) == Count(starts, AtMost(p)) - Count(stops, Below(p))
  {
    CountPermutation(starts, Starts(segs), AtMost(p));
    CountPermutation(stops, Stops(segs), Below(p));
    CoveringByEndpoints(segs, p);
  }

  method ArrayOf(s: seq<int>) returns (a: array<int>)
    ensures fresh(a) && a[..] == s
  {
    a := new int[|s|](i requires 0 <= i < |s| => s[i]);
  }

  /**
   * getAccessory: the pairs are normalised, the starts and the stops are
   * sorted separately, and each point's answer is
   * upperBound(starts, p) - lowerBound(stops, p).
   */
  method GetAccessory(pairs: seq<(int, int)>, points: seq<int>) returns (result: array<int>)
    ensures result.Length == |points|
    ensures forall i :: 0 <= i < |points| ==>
      result[i] == Covering(NormalizeAll(pairs), points[i])
  {
    var segs := NormalizeAll(pairs);
    var starts := ArrayOf(SortInts(Starts(segs)));
    var stops := ArrayOf(SortInts(Stops(segs)));
    result := Answers(segs, starts, stops, points);
  }

  /** The per-point loop of getAccessory over the sorted endpoint arrays. */
  method Answers(segs: seq<Segment>, starts: array<int>, stops: array<int>, points: seq<int>)
    returns (result: array<int>)
    requires EndpointsOf(segs, starts[..], stops[..])
    ensures result.Length == |points|
    ensures forall i :: 0 <= i < |points| ==> result[i] == Covering(segs, points[i])
  {
    result := new int[|points|];
    var i := 0;
    while i < |points|
      invariant 0 <= i <= |points|
      invariant forall j :: 0 <= j < i ==> result[j] == Covering(segs, points[j])
    {
      result[i] := CoveringCount(segs, starts, stops, points[i]);
      i := i + 1;
    }
  }

  /** `starts` and `stops` are the sorted endpoint lists of `segs`. */
  predicate EndpointsOf(segs: seq<Segment>, starts: seq<int>, stops: seq<int>) {
    (forall i :: 0 <= i < |segs| ==> segs[i].start <= segs[i].stop) &&
    Ascending(starts) && multiset(starts) == multiset(Starts(segs)) &&
    Ascending(stops) && multiset(stops) == multiset(Stops(segs))
  }

  /** One point's answer: upperBound(starts, p) - lowerBound(stops, p). */
  method CoveringCount(segs: seq<Segment>, starts: array<int>, stops: array<int>, point: int)
    returns (c: int)
    requires EndpointsOf(segs, starts[..], stops[..])
    ensures c == Covering(segs, point)
  {
    var startsCount := UpperBound(starts, point);
    var stopsCount := LowerBound(stops, point);
    CoveringFromSorted(segs, starts[..], stops[..], point);
    c := startsCount - stopsCount;
  }

  function NormalizeAll(pairs: seq<(int, int)>): (segs: seq<Segment>)
    ensures |segs| == |pairs|
    ensures forall i :: 0 <= i < |pairs| ==>
      segs[i] == Normalize(pairs[i].0, pairs[i].1) && segs[i].start <= segs[i].stop
  {
    if |pairs| == 0 then []
    else [Normalize(pairs[0].0, pairs[0].1)] + NormalizeAll(pairs[1..])
  }
}
