/**
  The integer sortedness validators `is_sorted_int32` and `is_sorted_int64` of
  the test driver EcoLab1.c. Both have the same body: scan adjacent pairs of the
  first `size` elements and answer 0 at the first descent, 1 otherwise. The
  model is one loop over `int` (`IsSorted`) and one wrapper per element width.
 */
module Validators {
  import opened CTypes

  /** Reference meaning of "sorted": every element is at most every later one. */
  ghost predicate Sorted(s: seq<int>) {
    forall i, j :: 0 <= i <= j < |s| ==> s[i] <= s[j]
  }

  /** What the validator's loop checks: no adjacent pair is a descent. */
  ghost predicate NoInversion(s: seq<int>) {
    forall k :: 0 < k < |s| ==> s[k - 1] <= s[k]
  }

  /** The part of the buffer the validator looks at: the first `size`
      elements, or none when `size` is zero or negative. */
  function Prefix(arr: seq<int>, size: int): (p: seq<int>)
    requires size <= |arr|
    ensures |p| == if size < 0 then 0 else size
    ensures forall k :: 0 <= k < |p| ==> p[k] == arr[k]
  {
    if size < 0 then [] else arr[..size]
  }

  /** From an adjacent pair's ordering up to any pair's, by walking from `i` to `j`. */
  lemma {:induction false} NoInversionChain(s: seq<int>, i: int, j: int)
    requires NoInversion(s)
    requires 0 <= i <= j < |s|
    ensures s[i] <= s[j]
    decreases j - i
  {
    if i < j {
      NoInversionChain(s, i, j - 1);
      assert s[j - 1] <= s[j];
    }
  }

  /** Checking adjacent pairs is exactly as strong as checking all pairs. */
  lemma {:induction false} NoInversionIffSorted(s: seq<int>)
    ensures NoInversion(s) <==> Sorted(s)
  {
    if NoInversion(s) {
      forall i, j | 0 <= i <= j < |s|
        ensures s[i] <= s[j]
      {
        NoInversionChain(s, i, j);
      }
    }
    if Sorted(s) {
      forall k | 0 < k < |s|
        ensures s[k - 1] <= s[k]
      {
        assert 0 <= k - 1 <= k < |s|;
      }
    }
  }

  /** The shared body of `is_sorted_int32` and `is_sorted_int64`: 1 exactly when
      the first `size` elements are in ascending order, 0 otherwise. The model
      requires `size` elements to be present, as every call in the driver
      provides; the source itself reads nothing when `size` is 1 or less. A
      `size` of 1 or less (negative included) never enters the loop and
      answers 1. The loop indexes only the prefix `[0, size)`, so its bounds
      checks show it reads nothing outside it; the result is stated in terms
      of that prefix alone. */
  method IsSorted(arr: seq<int>, size: int) returns (verdict: int)
    requires size <= |arr|
    ensures verdict == 0 || verdict == 1
    ensures verdict == 1 <==> Sorted(Prefix(arr, size))
    ensures size <= 1 ==> verdict == 1
  {
    // The scan indexes only the prefix, so each bounds check is against
    // `size`; with `i >= 1`, `i < |p|` is the source's `i < size`.
    var p := Prefix(arr, size);
    var i := 1;
    while i < |p|
      invariant 1 <= i
      invariant 1 < |p| ==> i <= |p|
      invariant forall k :: 0 < k < i && k < |p| ==> p[k - 1] <= p[k]
    {
      if p[i - 1] > p[i] {
        return 0;
      }
      i := i + 1;
    }
    NoInversionIffSorted(p);
    return 1;
  }

  /** `is_sorted_int32`: the validator over 32-bit elements. */
  method IsSortedInt32(arr: seq<Int32>, size: Int32) returns (verdict: Int32)
    requires size <= |arr|
    ensures verdict == 0 || verdict == 1
    ensures verdict == 1 <==> Sorted(Prefix(arr, size))
    ensures size <= 1 ==> verdict == 1
  {
    verdict := IsSorted(arr, size);
  }

  /** `is_sorted_int64`: the validator over 64-bit elements; same contract. */
  method IsSortedInt64(arr: seq<Int64>, size: Int32) returns (verdict: Int32)
    requires size <= |arr|
    ensures verdict == 0 || verdict == 1
    ensures verdict == 1 <==> Sorted(Prefix(arr, size))
    ensures size <= 1 ==> verdict == 1
  {
    verdict := IsSorted(arr, size);
  }
}
