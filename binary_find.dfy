/**
 * Binary search over an ascending array with a 1-based answer
 * (lesson04/A_BinaryFind.java).
 */
module BinaryFind {
  import opened Common

  predicate Sorted(a: seq<int>) {
    forall i, j :: 0 <= i < j < |a| ==> a[i] <= a[j]
  }

  predicate StrictlySorted(a: seq<int>) {
    forall i, j :: 0 <= i < j < |a| ==> a[i] < a[j]
  }

  /** The answer the exercise expects: the 1-based position of `key`, or -1. */
  function Position(a: seq<int>, key: int): int {
    if key in a then IndexOf(a, key) + 1 else -1
  }

  /**
   * binarySearch: halves [left, right] with mid = left + (right-left)/2
   * until arr[mid] == key or the range is empty.
   */
  method BinarySearch(arr: array<int>, key: int) returns (r: int)
    requires Sorted(arr[..])
    ensures r == -1 <==> key !in arr[..]
    ensures r != -1 ==> 1 <= r <= arr.Length && arr[r - 1] == key
    ensures StrictlySorted(arr[..]) ==> r == Position(arr[..], key)
  {
    var left, right := 0, arr.Length - 1;
    while left <= right
      invariant 0 <= left <= right + 1 <= arr.Length
      invariant forall i :: 0 <= i < left ==> arr[i] < key
      invariant forall i :: right < i < arr.Length ==> arr[i] > key
      decreases right - left
    {
      var mid := left + (right - left) / 2;
      if arr[mid] == key {
        if StrictlySorted(arr[..]) {
          UniquePosition(arr[..], mid, key);
        }
        return mid + 1;
      } else if arr[mid] < key {
        left := mid + 1;
      } else {
        right := mid - 1;
      }
    }
    return -1;
  }

  /** In a strictly ascending sequence the position of a value is unique. */
  lemma UniquePosition(a: seq<int>, k: nat, key: int)
    requires StrictlySorted(a) && k < |a| && a[k] == key
    ensures Position(a, key) == k + 1
  {
  }

  /** findIndex: one binary search per query, in query order. */
  method FindIndex(a: array<int>, queries: seq<int>) returns (result: array<int>)
    requires Sorted(a[..])
    ensures result.Length == |queries|
    ensures forall i :: 0 <= i < |queries| ==>
      (result[i] == -1 <==> queries[i] !in a[..]) &&
      (result[i] != -1 ==> 1 <= result[i] <= a.Length && a[result[i] - 1] == queries[i])
    ensures StrictlySorted(a[..]) ==>
      forall i :: 0 <= i < |queries| ==> result[i] == Position(a[..], queries[i])
  {
    result := new int[|queries|];
    var i := 0;
    while i < |queries|
      invariant 0 <= i <= |queries|
      invariant forall j :: 0 <= j < i ==>
        (result[j] == -1 <==> queries[j] !in a[..]) &&
        (result[j] != -1 ==> 1 <= result[j] <= a.Length && a[result[j] - 1] == queries[j])
      invariant StrictlySorted(a[..]) ==>
        forall j :: 0 <= j < i ==> result[j] == Position(a[..], queries[j])
    {
      result[i] := BinarySearch(a, queries[i]);
      i := i + 1;
    }
  }
}
