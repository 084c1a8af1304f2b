// LeetCode 1: find two distinct indices whose values add up to a target.
module TwoSum {

  /** The first index holding x, or -1 when x does not occur. */
  function FirstIndexOf(s: seq<int>, x: int): (r: int)
    ensures -1 <= r < |s|
    ensures r >= 0 ==> s[r] == x && forall j :: 0 <= j < r ==> s[j] != x
    ensures r < 0 ==> forall j :: 0 <= j < |s| ==> s[j] != x
  {
    if s == [] then -1
    else if s[0] == x then 0
    else
      var r := FirstIndexOf(s[1..], x);
      if r < 0 then -1 else r + 1
  }

  /** The first index j with nums[i] + nums[j] == target (possibly i itself), or -1. */
  function Partner(nums: seq<int>, target: int, i: int): (j: int)
    requires 0 <= i < |nums|
    ensures -1 <= j < |nums|
    ensures j >= 0 ==> nums[i] + nums[j] == target && forall j' :: 0 <= j' < j ==> nums[i] + nums[j'] != target
    ensures j < 0 ==> forall j' :: 0 <= j' < |nums| ==> nums[i] + nums[j'] != target
  {
    FirstIndexOf(nums, target - nums[i])
  }

  /** Some two distinct indices hold values summing to target. */
  predicate HasPair(nums: seq<int>, target: int)
  {
    exists i, j :: 0 <= i < |nums| && 0 <= j < |nums| && i != j && nums[i] + nums[j] == target
  }

  /** twoSum: BuildComplement's loop is the first loop; the second loop returns
      [i, complement[nums[i]]] for the first i whose entry is another index. */
  method TwoSum(nums: seq<int>, target: int) returns (sol: seq<int>)
    ensures sol == [] <==> !HasPair(nums, target)
    ensures sol != [] ==>
      |sol| == 2 && 0 <= sol[0] < |nums| && 0 <= sol[1] < |nums| && sol[0] != sol[1] &&
      nums[sol[0]] + nums[sol[1]] == target
    ensures sol != [] ==> sol[1] == Partner(nums, target, sol[0])
    ensures sol != [] ==> forall i :: 0 <= i < sol[0] ==> Partner(nums, target, i) in {-1, i}
  {
    var complement := BuildComplement(nums, target);
    sol := [];
    for i := 0 to |nums|
      invariant forall i' :: 0 <= i' < i ==> Partner(nums, target, i') in {-1, i'}
    {
      ghost var partner := Partner(nums, target, i);
      if nums[i] in complement && i != complement[nums[i]] {
        var j := complement[nums[i]];
        assert j == partner;
        sol := [i, j];
        return;
      }
    }
    NoPairFound(nums, target);
  }

  /** The map from target - nums[j] to the first index j giving that key (insert never
      overwrites): looking nums[i] up in it yields i's first partner. */
  method BuildComplement(nums: seq<int>, target: int) returns (complement: map<int, int>)
    ensures forall i {:trigger Partner(nums, target, i)} :: 0 <= i < |nums| ==>
      (nums[i] in complement <==> Partner(nums, target, i) >= 0) &&
      (nums[i] in complement ==> complement[nums[i]] == Partner(nums, target, i))
  {
    complement := map[];
    for i := 0 to |nums|
      invariant forall j :: 0 <= j < i ==>
        target - nums[j] in complement && complement[target - nums[j]] == FirstIndexOf(nums, nums[j])
      invariant forall k :: k in complement ==> 0 <= complement[k] < i && target - nums[complement[k]] == k
    {
      var key := target - nums[i];
      if key !in complement {
        complement := complement[key := i];
      }
    }
    forall i | 0 <= i < |nums|
      ensures nums[i] in complement ==> complement[nums[i]] == Partner(nums, target, i) >= 0
      ensures nums[i] !in complement ==> Partner(nums, target, i) == -1
    {
      LookupIsPartner(nums, target, complement, i);
    }
  }

  /** Looking nums[i] up in the finished complement map yields i's first partner. */
  lemma {:induction false} LookupIsPartner(nums: seq<int>, target: int, complement: map<int, int>, i: int)
    requires 0 <= i < |nums|
    requires forall j :: 0 <= j < |nums| ==>
      target - nums[j] in complement && complement[target - nums[j]] == FirstIndexOf(nums, nums[j])
    requires forall k :: k in complement ==> 0 <= complement[k] < |nums| && target - nums[complement[k]] == k
    ensures nums[i] in complement ==> complement[nums[i]] == Partner(nums, target, i) >= 0
    ensures nums[i] !in complement ==> Partner(nums, target, i) == -1
  {
    if nums[i] in complement {
      var c := complement[nums[i]];
      assert nums[c] == target - nums[i];
    }
  }

  /** When every index's first partner is itself or missing, no two distinct indices pair up. */
  lemma NoPairFound(nums: seq<int>, target: int)
    requires forall i :: 0 <= i < |nums| ==> Partner(nums, target, i) in {-1, i}
    ensures !HasPair(nums, target)
  {
    forall p, q | 0 <= p < |nums| && 0 <= q < |nums| && nums[p] + nums[q] == target
      ensures p == q
    {
      assert Partner(nums, target, p) == p;
      assert Partner(nums, target, q) == q;
    }
  }
}
