// LeetCode 1512: count the pairs i < j with nums[i] == nums[j], by sorting and summing
// t(t - 1)/2 over each run of t equal values.
module GoodPairs {
  import opened Sorting

  /** The number of pairs i < j with s[i] == s[j]: each j pairs with every earlier equal value. */
  function Pairs(s: seq<int>): nat
  {
    if s == [] then 0
    else
      var init := s[..|s| - 1];
      Pairs(init) + multiset(init)[s[|s| - 1]]
  }

  function Choose2(t: nat): nat
  {
    t * (t - 1) / 2
  }

  /** numIdenticalPairs: nums is sorted in place, then each run of equal values is counted. */
  method NumIdenticalPairs(nums: array<int>) returns (result: int)
    requires nums.Length > 0
    modifies nums
    ensures result == Pairs(old(nums[..]))
    ensures multiset(nums[..]) == multiset(old(nums[..]))
    ensures forall i, j :: 0 <= i < j < nums.Length ==> nums[i] <= nums[j]
  {
    Sort(nums, (x: int, y: int) => x <= y);
    result := CountRuns(nums);
    PairsPermutation(old(nums[..]), nums[..]);
  }

  /** The counting loop over the sorted nums: a run of t equal values adds t(t - 1)/2. */
  method CountRuns(nums: array<int>) returns (result: int)
    requires nums.Length > 0
    requires forall i, j :: 0 <= i < j < nums.Length ==> nums[i] <= nums[j]
    ensures result == Pairs(nums[..])
  {
    ghost var s := nums[..];
    result := 0;
    var temp := 1;
    var current := nums[0];
    assert s[..1] == [current];
    for i := 1 to nums.Length
      invariant 1 <= temp <= i && current == s[i - 1]
      invariant multiset(s[..i])[current] == temp
      invariant result + Choose2(temp) == Pairs(s[..i])
    {
      if nums[i] == current {
        SameRun(s, i, temp);
        temp := temp + 1;
      } else {
        NewRun(s, i);
        result := result + Choose2(temp);
        current := nums[i];
        temp := 1;
      }
    }
    assert s[..nums.Length] == s;
    result := result + Choose2(temp);
  }

  /** A value equal to its predecessor joins the run: it pairs with the temp earlier copies. */
  lemma SameRun(s: seq<int>, i: int, temp: nat)
    requires 0 < i < |s| && s[i] == s[i - 1] && multiset(s[..i])[s[i]] == temp
    ensures multiset(s[..i + 1])[s[i]] == temp + 1
    ensures Pairs(s[..i + 1]) == Pairs(s[..i]) + temp
    ensures Choose2(temp + 1) == Choose2(temp) + temp
  {
    assert s[..i + 1] == s[..i] + [s[i]];
    assert s[..i + 1][..i] == s[..i];
    ChooseStep(temp);
  }

  /** In sorted order a value above its predecessor starts a run and pairs with nothing. */
  lemma NewRun(s: seq<int>, i: int)
    requires 0 < i < |s| && s[i] != s[i - 1]
    requires forall p, q :: 0 <= p < q < |s| ==> s[p] <= s[q]
    ensures multiset(s[..i + 1])[s[i]] == 1
    ensures Pairs(s[..i + 1]) == Pairs(s[..i])
  {
    assert multiset(s[..i])[s[i]] == 0 by {
      forall k | 0 <= k < i
        ensures s[..i][k] != s[i]
      {
        assert s[k] <= s[i - 1] <= s[i];
      }
    }
    assert s[..i + 1] == s[..i] + [s[i]];
    assert s[..i + 1][..i] == s[..i];
  }

  lemma ChooseStep(t: nat)
    ensures Choose2(t + 1) == Choose2(t) + t
  {
    assert (t + 1) * t == t * (t - 1) + 2 * t;
  }

  /** Pairs counts pairs of equal values, so it depends only on the multiset of values. */
  lemma {:induction false} PairsPermutation(s: seq<int>, t: seq<int>)
    requires multiset(s) == multiset(t)
    ensures Pairs(s) == Pairs(t)
    decreases |s|
  {
    if s != [] {
      var x := s[|s| - 1];
      var init := s[..|s| - 1];
      assert s == init + [x];
      assert x in multiset(t);
      var k :| 0 <= k < |t| && t[k] == x;
      var rest := t[..k] + t[k + 1..];
      assert t == t[..k] + [x] + t[k + 1..];
      assert multiset(s) == multiset(init) + multiset{x};
      assert multiset(t) == multiset(t[..k]) + multiset{x} + multiset(t[k + 1..]);
      assert multiset(rest) == multiset(t[..k]) + multiset(t[k + 1..]);
      assert multiset(init) == multiset(s) - multiset{x};
      assert multiset(rest) == multiset(t) - multiset{x};
      PairsPermutation(init, rest);
      PairsRemove(t, k);
    }
  }

  /** Removing the element at k drops exactly the pairs it takes part in. */
  lemma {:induction false} PairsRemove(t: seq<int>, k: int)
    requires 0 <= k < |t|
    ensures Pairs(t) == Pairs(t[..k] + t[k + 1..]) + multiset(t)[t[k]] - 1
    decreases |t|
  {
    var n := |t|;
    var u := t[..n - 1];
    var y := t[n - 1];
    assert t == u + [y];
    if k == n - 1 {
      assert t[..k] + t[k + 1..] == u;
    } else {
      var uk := u[..k] + u[k + 1..];
      assert t[..k] + t[k + 1..] == uk + [y];
      assert u[k] == t[k];
      assert u == u[..k] + [u[k]] + u[k + 1..];
      assert multiset(u) == multiset(uk) + multiset{u[k]};
      PairsRemove(u, k);
      assert (uk + [y])[..|uk|] == uk;
    }
  }
}
