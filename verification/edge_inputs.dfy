/**
  The two deterministic inputs of the driver's edge tests, and what the
  validators say about them before any sort has touched them.
 */
module EdgeInputs {
  import opened CTypes
  import opened Validators

  /** Length of the already-sorted `int32_t` edge test (`N6`). */
  const N6: nat := 1000

  /** Length of the reverse-sorted `double` edge test (`N7`). */
  const N7: nat := 2000

  /** The fill `arr[i] = i` for `i < n`. */
  function AscendingFill(n: nat): (arr: seq<int>)
    ensures |arr| == n
  {
    seq(n, i => i)
  }

  /** The fill `arr[i] = n - i` for `i < n`: n down to 1. */
  function ReverseFill(n: nat): (arr: seq<int>)
    ensures |arr| == n
  {
    seq(n, i => n - i)
  }

  /** The ascending fill is sorted for every length. */
  lemma AscendingFillSorted(n: nat)
    ensures Sorted(AscendingFill(n))
  {
  }

  /** The reverse fill is not sorted once it has two elements: its first
      element exceeds its second. */
  lemma ReverseFillNotSorted(n: nat)
    requires n >= 2
    ensures !Sorted(ReverseFill(n))
  {
    var arr := ReverseFill(n);
    assert arr[0] == n && arr[1] == n - 1;
  }

  /** The already-sorted edge test (lines 228-233): the array built by
      `arr[i] = i` fits `int32_t`, and `is_sorted_int32` accepts it even
      before the sort component is asked to sort it. */
  method AscendingEdgeVerdict() returns (verdict: Int32)
    ensures verdict == 1
  {
    var arr := AscendingFill(N6);
    AscendingFillSorted(N6);
    verdict := IsSortedInt32(arr, N6 as Int32);
  }

  /** The reverse-sorted edge test's input (lines 242-245), before sorting.
      Its values 2000 down to 1 are exactly representable as `double`, so `>`
      on them is integer `>`: the validators' shared scan, run on these values,
      rejects the unsorted input. */
  method ReverseEdgeVerdict() returns (verdict: Int32)
    ensures verdict == 0
  {
    var arr := ReverseFill(N7);
    ReverseFillNotSorted(N7);
    var v := IsSorted(arr, N7);
    verdict := v;
  }
}
