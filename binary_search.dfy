/**
 * The binary search of t2_bin_search_for_floats.py: over an ascending
 * sequence it returns the number of loop passes together with the target
 * when it is present, or else the smallest element greater than the target
 * (the "upper bound"), or nothing when every element is smaller.
 *
 * Elements are exact reals: there is no NaN and no rounding, and the search
 * only compares elements with `==`, `<` and `>`.
 */
module UpperBoundSearch {

  import opened Options

  /** Ascending order, duplicates allowed. */
  predicate Sorted(arr: seq<real>)
  {
    forall i, j :: 0 <= i < j < |arr| ==> arr[i] <= arr[j]
  }

  /** The first element of `arr` that is greater than `target`, if any. */
  function FirstAbove(arr: seq<real>, target: real): (r: Option<real>)
    ensures r.Some? ==> r.value in arr && r.value > target
    ensures r.None? <==> forall x :: x in arr ==> x <= target
  {
    if |arr| == 0 then None
    else if arr[0] > target then Some(arr[0])
    else
      assert forall x :: x in arr <==> x == arr[0] || x in arr[1..];
      FirstAbove(arr[1..], target)
  }

  /** The answer the search promises: the target itself, or else its upper bound. */
  function Expected(arr: seq<real>, target: real): Option<real>
  {
    if target in arr then Some(target) else FirstAbove(arr, target)
  }

  /**
   * The search as the recursion its loop unrolls to: from the range
   * `left..right` after `iterations` passes, the final number of passes and
   * the result.
   */
  function Bisect(arr: seq<real>, target: real, left: int, right: int, iterations: nat): (nat, Option<real>)
    requires 0 <= left <= right + 1 <= |arr|
    decreases right - left + 1
  {
    if left > right then (iterations, if left < |arr| then Some(arr[left]) else None)
    else
      var mid := (left + right) / 2;
      if arr[mid] == target then (iterations + 1, Some(arr[mid]))
      else if arr[mid] < target then Bisect(arr, target, mid + 1, right, iterations + 1)
      else Bisect(arr, target, left, mid - 1, iterations + 1)
  }

  /**
   * When the elements before `k` are at most `target` and `arr[k]` (if it
   * exists) is greater, `arr[k]` is the first element above `target`.
   */
  lemma {:induction false} FirstAboveAt(arr: seq<real>, target: real, k: int)
    requires 0 <= k <= |arr|
    requires forall i :: 0 <= i < k ==> arr[i] <= target
    requires k < |arr| ==> arr[k] > target
    ensures FirstAbove(arr, target) == if k < |arr| then Some(arr[k]) else None
  {
    if k > 0 {
      FirstAboveAt(arr[1..], target, k - 1);
    }
  }

  /**
   * On a sorted sequence without the target, the answer is the least
   * element above the target, and there is none exactly when every element
   * is below it.
   */
  lemma {:induction false} UpperBoundIsLeast(arr: seq<real>, target: real)
    requires Sorted(arr) && target !in arr
    ensures Expected(arr, target).None? <==> forall x :: x in arr ==> x < target
    ensures Expected(arr, target).Some? ==>
              var v := Expected(arr, target).value;
              v in arr && v > target && forall x :: x in arr && x > target ==> v <= x
  {
    if |arr| > 0 && arr[0] <= target {
      assert Sorted(arr[1..]);
      UpperBoundIsLeast(arr[1..], target);
      forall x | x in arr && x > target
        ensures x in arr[1..]
      {
        assert x != arr[0];
      }
    } else if |arr| > 0 {
      forall x | x in arr
        ensures arr[0] <= x
      {
        var i :| 0 <= i < |arr| && arr[i] == x;
        assert i == 0 || arr[0] <= arr[i];
      }
    }
  }

  /**
   * On a sorted sequence, bisecting a range outside of which every element
   * before it is below `target` and every element after it is above,
   * yields the expected answer.
   */
  lemma {:induction false} BisectFindsExpected(arr: seq<real>, target: real, left: int, right: int, iterations: nat)
    requires Sorted(arr) && 0 <= left <= right + 1 <= |arr|
    requires forall i :: 0 <= i < left ==> arr[i] < target
    requires forall i :: right < i < |arr| ==> arr[i] > target
    ensures Bisect(arr, target, left, right, iterations).1 == Expected(arr, target)
    decreases right - left + 1
  {
    if left > right {
      FirstAboveAt(arr, target, left);
    } else {
      var mid := (left + right) / 2;
      if arr[mid] < target {
        BisectFindsExpected(arr, target, mid + 1, right, iterations + 1);
      } else if arr[mid] > target {
        BisectFindsExpected(arr, target, left, mid - 1, iterations + 1);
      }
    }
  }

  /** 2 raised to `e`, for the bound on the number of passes. */
  function Pow2(e: nat): nat
  {
    if e == 0 then 1 else 2 * Pow2(e - 1)
  }

  /**
   * Bisecting a range of `right - left + 1` elements makes no pass when the
   * range is empty and otherwise at most one more pass than log2 of its
   * width, because every pass that does not find the target at least
   * halves the range.
   */
  lemma {:induction false} BisectPasses(arr: seq<real>, target: real, left: int, right: int, iterations: nat)
    requires 0 <= left <= right + 1 <= |arr|
    ensures Bisect(arr, target, left, right, iterations).0 >= iterations
    ensures Bisect(arr, target, left, right, iterations).0 == iterations <==> left > right
    ensures left <= right ==>
              Pow2(Bisect(arr, target, left, right, iterations).0 - iterations - 1) <= right - left + 1
    decreases right - left + 1
  {
    if left <= right {
      var mid := (left + right) / 2;
      if arr[mid] < target {
        BisectPasses(arr, target, mid + 1, right, iterations + 1);
      } else if arr[mid] > target {
        BisectPasses(arr, target, left, mid - 1, iterations + 1);
      }
    }
  }

  /** What the search promises, stated of `Bisect` over the whole sequence. */
  lemma SearchOutcome(arr: seq<real>, target: real)
    requires Sorted(arr)
    ensures Bisect(arr, target, 0, |arr| - 1, 0).1 == Expected(arr, target)
    ensures Bisect(arr, target, 0, |arr| - 1, 0).0 == 0 <==> |arr| == 0
    ensures Bisect(arr, target, 0, |arr| - 1, 0).0 > 0 ==>
              Pow2(Bisect(arr, target, 0, |arr| - 1, 0).0 - 1) <= |arr|
  {
    BisectFindsExpected(arr, target, 0, |arr| - 1, 0);
    BisectPasses(arr, target, 0, |arr| - 1, 0);
  }

  /**
   * The loop of `binary_search`, which returns the pass count and result of
   * `Bisect` from the full range; on a sorted sequence that result is the
   * target when present and its upper bound otherwise (nothing when every
   * element is smaller). The pass count is bounded by `SearchOutcome`.
   * Unsorted input is accepted, as in the source, with no promise about the
   * result. The loop keeps `Bisect` of the current range equal to `Bisect`
   * of the full range, and the range shrinks on every pass that does not return.
   */
  method BinarySearch(arr: seq<real>, target: real) returns (iterations: nat, upperBound: Option<real>)
    ensures (iterations, upperBound) == Bisect(arr, target, 0, |arr| - 1, 0)
    ensures Sorted(arr) ==> upperBound == Expected(arr, target)
  {
    var left, right := 0, |arr| - 1;
    iterations := 0;

    while left <= right
      invariant 0 <= left <= right + 1 <= |arr|
      invariant Bisect(arr, target, left, right, iterations) == Bisect(arr, target, 0, |arr| - 1, 0)
      decreases right - left
    {
      iterations := iterations + 1;
      var mid := (left + right) / 2;

      if arr[mid] == target {
        if Sorted(arr) {
          BisectFindsExpected(arr, target, 0, |arr| - 1, 0);
        }
        return iterations, Some(arr[mid]);  // found the exact value
      } else if arr[mid] < target {
        left := mid + 1;
      } else {
        right := mid - 1;
      }
    }

    upperBound := if left < |arr| then Some(arr[left]) else None;
    if Sorted(arr) {
      BisectFindsExpected(arr, target, 0, |arr| - 1, 0);
    }
  }

  /** The cases of `test_binary_search`, and the empty sequence. */
  lemma TestBinarySearch()
    ensures Bisect([], 1.0, 0, -1, 0) == (0, None)
    ensures Bisect([1.0, 2.5, 3.5, 4.3, 5.9], 3.5, 0, 4, 0) == (1, Some(3.5))
    ensures Bisect([1.0, 2.5, 3.5, 4.3, 5.9], 4.0, 0, 4, 0) == (2, Some(4.3))
    ensures Bisect([1.0, 2.5, 3.5, 4.3, 5.9], 6.0, 0, 4, 0) == (3, None)
  {
  }

}
