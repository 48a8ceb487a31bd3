/** Binary search over a sorted list (src/binary_search.py). */
module BinarySearch {

  predicate Sorted(arr: seq<int>) {
    forall i, j :: 0 <= i < j < |arr| ==> arr[i] <= arr[j]
  }

  /** `binary_search(arr, target)`: an index of `target` in `arr`, or -1.
      Whatever `arr` is, a returned index holds `target`, and -1 is returned
      whenever `target` is absent; on a sorted list -1 means absent. */
  method BinarySearch(arr: seq<int>, target: int) returns (index: int)
    ensures index == -1 || (0 <= index < |arr| && arr[index] == target)
    ensures target !in arr ==> index == -1
    ensures Sorted(arr) && target in arr ==> index != -1
  {
    var low := 0;
    var high := |arr| - 1;
    while low <= high
      invariant 0 <= low <= high + 1 <= |arr|
      invariant Sorted(arr) ==> forall i :: 0 <= i < |arr| && arr[i] == target ==> low <= i <= high
      decreases high - low
    {
      var mid := (low + high) / 2;
      if arr[mid] == target {
        return mid;
      } else if arr[mid] < target {
        low := mid + 1;
      } else {
        high := mid - 1;
      }
    }
    return -1;
  }
}
