/** Two warm-up exercises: the maximum of an `int` array, and the 0/1
    subset-sum decision by a one-dimensional table of reachable sums. */
module AlgorithmCollection {
  import opened Wrappers

  // ---------------------------------------------------------------------
  // Maximum
  // ---------------------------------------------------------------------

  /** The running maximum, starting from `Integer.MIN_VALUE`; a null or empty
      array gives 0. */
  method FindMax(numbers: array?<int32>) returns (max: int32)
    ensures numbers == null || numbers.Length == 0 ==> max == 0
    ensures numbers != null ==> forall i :: 0 <= i < numbers.Length ==> numbers[i] <= max
    ensures numbers != null && numbers.Length > 0 ==> exists i :: 0 <= i < numbers.Length && numbers[i] == max
  {
    if numbers == null || numbers.Length == 0 {
      return 0;
    }
    max := INT_MIN as int32;
    for idx := 0 to numbers.Length
      invariant idx == 0 ==> max as int == INT_MIN
      invariant forall i :: 0 <= i < idx ==> numbers[i] <= max
      invariant idx > 0 ==> exists i :: 0 <= i < idx && numbers[i] == max
    {
      var number := numbers[idx];
      if number > max {
        max := number;
      }
    }
  }

  // ---------------------------------------------------------------------
  // Subset sum
  // ---------------------------------------------------------------------

  /** Some choice of the elements of `nums`, each used at most once, sums to
      s: the last element is either left out or taken. */
  ghost predicate Achievable(nums: seq<int32>, s: int)
    decreases |nums|
  {
    if nums == [] then s == 0
    else
      var rest := nums[..|nums| - 1];
      Achievable(rest, s) || Achievable(rest, s - nums[|nums| - 1] as int)
  }

  /** The sum of the elements that `mask` selects. */
  ghost function MaskedSum(nums: seq<int32>, mask: seq<bool>): int
    requires |mask| == |nums|
    decreases |nums|
  {
    if nums == [] then 0
    else
      var n := |nums| - 1;
      MaskedSum(nums[..n], mask[..n]) + (if mask[n] then nums[n] as int else 0)
  }

  /** `Achievable` is exactly "some subset sums to s", with the subset given
      as a selection mask. */
  lemma {:induction false} AchievableIffSubset(nums: seq<int32>, s: int)
    ensures Achievable(nums, s) <==> exists mask :: |mask| == |nums| && MaskedSum(nums, mask) == s
    decreases |nums|
  {
    if nums == [] {
      if Achievable(nums, s) {
        assert MaskedSum(nums, []) == s;
      }
    } else {
      var n := |nums| - 1;
      var rest, x := nums[..n], nums[n] as int;
      AchievableIffSubset(rest, s);
      AchievableIffSubset(rest, s - x);
      if Achievable(nums, s) {
        if Achievable(rest, s) {
          var m :| |m| == |rest| && MaskedSum(rest, m) == s;
          assert (m + [false])[..n] == m;
          assert MaskedSum(nums, m + [false]) == s;
        } else {
          var m :| |m| == |rest| && MaskedSum(rest, m) == s - x;
          assert (m + [true])[..n] == m;
          assert MaskedSum(nums, m + [true]) == s;
        }
      }
      if exists mask :: |mask| == |nums| && MaskedSum(nums, mask) == s {
        var mask :| |mask| == |nums| && MaskedSum(nums, mask) == s;
        var m := mask[..n];
        assert |m| == |rest| && MaskedSum(rest, m) == (if mask[n] then s - x else s);
        if mask[n] {
          assert exists mask' :: |mask'| == |rest| && MaskedSum(rest, mask') == s - x;
        } else {
          assert exists mask' :: |mask'| == |rest| && MaskedSum(rest, mask') == s;
        }
      }
    }
  }

  /** With no negative element, no negative sum is achievable. */
  lemma {:induction false} NegativeSumUnachievable(nums: seq<int32>, s: int)
    requires forall i :: 0 <= i < |nums| ==> nums[i] >= 0
    requires s < 0
    ensures !Achievable(nums, s)
    decreases |nums|
  {
    if nums != [] {
      var n := |nums| - 1;
      NegativeSumUnachievable(nums[..n], s);
      NegativeSumUnachievable(nums[..n], s - nums[n] as int);
    }
  }

  /** The table of reachable sums, updated once per number with a backward
      sweep so that each number is used at most once. A negative target is
      answered before the numbers are read; otherwise a negative number
      would index past the end of the table, and `targetSum + 1` must not
      overflow. */
  method HasSubsetSum(targetSum: int32, numbers: seq<int32>) returns (found: bool)
    requires targetSum as int < INT_MAX
    requires targetSum >= 0 ==> forall i :: 0 <= i < |numbers| ==> numbers[i] >= 0
    ensures targetSum < 0 ==> !found
    ensures targetSum >= 0 ==> (found <==> Achievable(numbers, targetSum as int))
  {
    if targetSum < 0 {
      return false;
    }
    var target := targetSum as int;
    // `new boolean[..]` starts out all false
    var reachable := new bool[target + 1](_ => false);
    reachable[0] := true;
    assert forall s :: 0 <= s <= target ==> (reachable[s] <==> Achievable(numbers[..0], s));

    for idx := 0 to |numbers|
      invariant forall s :: 0 <= s <= target ==> (reachable[s] <==> Achievable(numbers[..idx], s))
    {
      var number := numbers[idx] as int;
      ghost var prefix := numbers[..idx];
      assert numbers[..idx + 1][..idx] == prefix;
      var j := target;
      while j >= number
        invariant j <= target && (number - 1 <= j || j == target)
        invariant forall s :: 0 <= s <= j ==> (reachable[s] <==> Achievable(prefix, s))
        invariant forall s :: j < s <= target ==> (reachable[s] <==> Achievable(numbers[..idx + 1], s))
      {
        if reachable[j - number] {
          reachable[j] := true;
        }
        j := j - 1;
      }
      forall s | 0 <= s <= j
        ensures Achievable(numbers[..idx + 1], s) <==> Achievable(prefix, s)
      {
        NegativeSumUnachievable(prefix, s - number);
      }
    }
    assert numbers[..|numbers|] == numbers;
    return reachable[target];
  }
}
